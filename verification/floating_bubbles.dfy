/**
  The floating-bubble layout engine of the option picker: rejection-sampling
  placement of the bubbles, and the per-frame physics step (drift, wall
  bounce, pairwise separation, clamping and damped impulse).

  Numbers are `real`. `Math.random()` is replaced by a caller-supplied stream
  of draws `random: nat -> real`, each in [0, 1), consumed in the order the
  component calls it. `Math.sqrt` is the parameter `sqrt: real -> real`;
  facts that need it to be exact require `IsSqrt(sqrt)`.
 */
module FloatingBubbles {
  import opened Wrappers
  import opened Geometry

  /** An option the user can pick: its value becomes the bubble's id. */
  datatype BubbleOption = BubbleOption(value: string, caption: string, description: string)

  /**
    A bubble. (x, y) is the top-left corner of its bounding square of side
    `size`; (vx, vy) is its velocity in units per frame.
   */
  datatype Bubble = Bubble(
    id: string,
    x: real, y: real,
    vx: real, vy: real,
    size: real,
    caption: string, description: string)

  // Placement constants.
  const MinSize: real := 80.0
  const SizeSpread: real := 40.0
  const MaxAttempts: nat := 100
  const PlacementPadding: real := 10.0
  const SpeedSpread: real := 0.8

  // Collision constants.
  const CollisionGap: real := 2.0
  const SeparationSlack: real := 0.5
  const Damping: real := 0.9

  function CentreX(b: Bubble): real { b.x + b.size / 2.0 }
  function CentreY(b: Bubble): real { b.y + b.size / 2.0 }

  /** Identity, size and texts: what no step of the engine may change. */
  predicate SameBody(a: Bubble, b: Bubble)
  {
    a.id == b.id && a.size == b.size && a.caption == b.caption && a.description == b.description
  }

  /** The bubble's bounding square lies inside the width x height container. */
  predicate InBounds(b: Bubble, width: real, height: real)
  {
    0.0 <= b.x <= width - b.size && 0.0 <= b.y <= height - b.size
  }

  /** The container is at least as large as the bubble on both axes. */
  predicate Fits(b: Bubble, width: real, height: real)
  {
    b.size <= width && b.size <= height
  }

  // ---------------------------------------------------------------------
  // Placement
  // ---------------------------------------------------------------------

  /** Squared distance between the centre of a candidate square (x, y, size) and that of `b`. */
  function CandidateSqDist(x: real, y: real, size: real, b: Bubble): real
  {
    var dx := (x + size / 2.0) - CentreX(b);
    var dy := (y + size / 2.0) - CentreY(b);
    dx * dx + dy * dy
  }

  /** The smallest centre distance placement accepts between a candidate of `size` and `b`. */
  function PlacementGap(size: real, b: Bubble): real
  {
    (size + b.size) / 2.0 + PlacementPadding
  }

  /** The candidate square (x, y, size) comes too close to the placed bubble `b`. */
  predicate Crowds(x: real, y: real, size: real, b: Bubble, sqrt: real -> real)
  {
    var dx := (x + size / 2.0) - CentreX(b);
    var dy := (y + size / 2.0) - CentreY(b);
    Hypot(dx, dy, sqrt) < PlacementGap(size, b)
  }

  /** The candidate's squared centre distance to `b` is below the squared placement gap. */
  predicate CrowdsBySquare(x: real, y: real, size: real, b: Bubble)
  {
    CandidateSqDist(x, y, size, b) < PlacementGap(size, b) * PlacementGap(size, b)
  }

  /**
    The overlap test of placement: scans the placed bubbles in order and
    answers true at the first one the candidate crowds.
   */
  function HasOverlap(x: real, y: real, size: real, bubbles: seq<Bubble>, sqrt: real -> real): bool
  {
    if bubbles == [] then false
    else if Crowds(x, y, size, bubbles[0], sqrt) then true
    else HasOverlap(x, y, size, bubbles[1..], sqrt)
  }

  /** The overlap test is true iff the candidate crowds some placed bubble; never on an empty list. */
  lemma {:induction false} HasOverlapCrowds(x: real, y: real, size: real, bubbles: seq<Bubble>, sqrt: real -> real)
    ensures HasOverlap(x, y, size, bubbles, sqrt) <==> exists k :: 0 <= k < |bubbles| && Crowds(x, y, size, bubbles[k], sqrt)
    ensures bubbles == [] ==> !HasOverlap(x, y, size, bubbles, sqrt)
  {
    if bubbles != [] {
      HasOverlapCrowds(x, y, size, bubbles[1..], sqrt);
      assert forall k :: 1 <= k < |bubbles| ==> bubbles[k] == bubbles[1..][k - 1];
    }
  }

  /**
    With an exact square root, the overlap test is the squared-distance
    comparison: true iff some placed bubble's centre is strictly closer than
    half the summed sizes plus the padding.
   */
  lemma HasOverlapBySquares(x: real, y: real, size: real, bubbles: seq<Bubble>, sqrt: real -> real)
    requires IsSqrt(sqrt)
    requires 0.0 <= size
    requires forall k :: 0 <= k < |bubbles| ==> 0.0 <= bubbles[k].size
    ensures HasOverlap(x, y, size, bubbles, sqrt) <==> exists k :: 0 <= k < |bubbles| && CrowdsBySquare(x, y, size, bubbles[k])
  {
    forall k | 0 <= k < |bubbles|
      ensures Crowds(x, y, size, bubbles[k], sqrt) <==> CrowdsBySquare(x, y, size, bubbles[k])
    {
      CrowdsBySquares(x, y, size, bubbles[k], sqrt);
    }
    HasOverlapCrowds(x, y, size, bubbles, sqrt);
  }

  /** One placed bubble: crowding is the squared-distance comparison. */
  lemma CrowdsBySquares(x: real, y: real, size: real, b: Bubble, sqrt: real -> real)
    requires IsSqrt(sqrt)
    requires 0.0 <= size && 0.0 <= b.size
    ensures Crowds(x, y, size, b, sqrt) <==> CrowdsBySquare(x, y, size, b)
  {
    HypotCompare((x + size / 2.0) - CentreX(b), (y + size / 2.0) - CentreY(b), sqrt, PlacementGap(size, b));
  }

  /**
    `v` is what `Math.random() * span` can produce: it lies between 0
    (included) and `span` (excluded), whatever the sign of `span`.
   */
  predicate InDrawRange(v: real, span: real)
  {
    if 0.0 < span then 0.0 <= v < span
    else if span == 0.0 then v == 0.0
    else span < v <= 0.0
  }

  /** `v`, drawn as `r * span` with `r` in [0, 1), is in the draw range of `span`. */
  lemma ScaledDraw(r: real, span: real, v: real)
    requires 0.0 <= r < 1.0
    requires v == r * span
    ensures InDrawRange(v, span)
  {
    if 0.0 < span {
      assert 0.0 <= v;
      assert span - v == (1.0 - r) * span;
      assert 0.0 < (1.0 - r) * span;
    } else if span < 0.0 {
      assert v <= 0.0;
      assert v - span == (1.0 - r) * (0.0 - span);
      assert 0.0 < (1.0 - r) * (0.0 - span);
    }
  }

  /** A size drawn as `80 + r * 40` with `r` in [0, 1) is in [80, 120). */
  lemma SizeDraw(r: real, size: real)
    requires 0.0 <= r < 1.0
    requires size == MinSize + r * SizeSpread
    ensures MinSize <= size < MinSize + SizeSpread
  {
  }

  /** A speed drawn as `(r - 0.5) * 0.8` with `r` in [0, 1) is in [-0.4, 0.4). */
  lemma SpeedDraw(r: real, v: real)
    requires 0.0 <= r < 1.0
    requires v == (r - 0.5) * SpeedSpread
    ensures -SpeedSpread / 2.0 <= v < SpeedSpread / 2.0
  {
  }

  /**
    What placement promises about the bubble it builds for `option`: the
    option's value as id and its texts, a size in [80, 120), a velocity in
    [-0.4, 0.4) on each axis, and a corner drawn in [0, width - size) x
    [0, height - size).
   */
  predicate WellDrawn(b: Bubble, option: BubbleOption, width: real, height: real)
  {
    && b.id == option.value && b.caption == option.caption && b.description == option.description
    && MinSize <= b.size < MinSize + SizeSpread
    && -SpeedSpread / 2.0 <= b.vx < SpeedSpread / 2.0
    && -SpeedSpread / 2.0 <= b.vy < SpeedSpread / 2.0
    && InDrawRange(b.x, width - b.size)
    && InDrawRange(b.y, height - b.size)
  }

  /** The x of placement attempt `a` (counted from 0) when the bubble's draws start at `draw`. */
  function AttemptX(random: nat -> real, draw: nat, a: nat, span: real): real
  {
    random(draw + 1 + 2 * a) * span
  }

  /** The y of placement attempt `a` (counted from 0) when the bubble's draws start at `draw`. */
  function AttemptY(random: nat -> real, draw: nat, a: nat, span: real): real
  {
    random(draw + 2 + 2 * a) * span
  }

  /** Attempt `a` placed the candidate square over a bubble of `placed`. */
  predicate Rejected(placed: seq<Bubble>, random: nat -> real, draw: nat, a: nat,
                     size: real, width: real, height: real, sqrt: real -> real)
  {
    HasOverlap(AttemptX(random, draw, a, width - size), AttemptY(random, draw, a, height - size), size, placed, sqrt)
  }

  /**
    `b` is the bubble placement builds for `option` against the bubbles
    `placed`, from the draws starting at `draw`, after `tries` attempts:
    the size from the first draw, the corner of the last attempt, the
    velocity from the two draws after it; every earlier attempt overlapped,
    and the last one does not unless the attempts ran out.
   */
  predicate DrawnFrom(b: Bubble, option: BubbleOption, placed: seq<Bubble>, width: real, height: real,
                      random: nat -> real, draw: nat, tries: nat, sqrt: real -> real)
  {
    && 1 <= tries <= MaxAttempts
    && b.id == option.value && b.caption == option.caption && b.description == option.description
    && b.size == MinSize + random(draw) * SizeSpread
    && b.x == AttemptX(random, draw, tries - 1, width - b.size)
    && b.y == AttemptY(random, draw, tries - 1, height - b.size)
    && b.vx == (random(draw + 2 * tries + 1) - 0.5) * SpeedSpread
    && b.vy == (random(draw + 2 * tries + 2) - 0.5) * SpeedSpread
    && (forall a :: 0 <= a < tries - 1 ==> Rejected(placed, random, draw, a, b.size, width, height, sqrt))
    && (tries < MaxAttempts ==> !HasOverlap(b.x, b.y, b.size, placed, sqrt))
  }

  /**
    The attempt loop of placement for a bubble of `size`, with the
    positions drawn from `random(draw + 1)` on: draws a position until one
    does not overlap `placed` or 100 attempts are spent, and keeps the last
    one drawn. `tries` is how many positions it drew.
   */
  method DrawPosition(placed: seq<Bubble>, size: real, width: real, height: real,
                      random: nat -> real, draw: nat, sqrt: real -> real)
    returns (x: real, y: real, next: nat, ghost tries: nat)
    ensures 1 <= tries <= MaxAttempts
    ensures x == AttemptX(random, draw, tries - 1, width - size) && y == AttemptY(random, draw, tries - 1, height - size)
    ensures forall a :: 0 <= a < tries - 1 ==> Rejected(placed, random, draw, a, size, width, height, sqrt)
    ensures tries < MaxAttempts ==> !HasOverlap(x, y, size, placed, sqrt)
    ensures next == draw + 2 * tries + 1
  {
    // The do-while of the source: the first attempt, then one more while the
    // attempts last and the position overlaps.
    x := random(draw + 1) * (width - size);
    y := random(draw + 2) * (height - size);
    next := draw + 3;
    var attempts: nat := 1;
    while attempts < MaxAttempts && HasOverlap(x, y, size, placed, sqrt)
      invariant 1 <= attempts <= MaxAttempts
      invariant next == draw + 2 * attempts + 1
      invariant x == AttemptX(random, draw, attempts - 1, width - size)
      invariant y == AttemptY(random, draw, attempts - 1, height - size)
      invariant forall a :: 0 <= a < attempts - 1 ==> Rejected(placed, random, draw, a, size, width, height, sqrt)
      decreases MaxAttempts - attempts
    {
      assert Rejected(placed, random, draw, attempts - 1, size, width, height, sqrt);
      x := random(next) * (width - size);
      y := random(next + 1) * (height - size);
      next := next + 2;
      attempts := attempts + 1;
    }
    tries := attempts;
  }

  /**
    One bubble of the placement, for `option`, given the bubbles `placed`
    before it; the draws used are `random(draw)` .. `random(next - 1)`.
    It draws a size, then positions until one does not overlap `placed` or
    100 attempts are spent (the last position is then kept as it is), then
    a velocity. `tries` is how many positions it drew.
   */
  method DrawBubble(option: BubbleOption, placed: seq<Bubble>, width: real, height: real,
                    random: nat -> real, draw: nat, sqrt: real -> real)
    returns (bubble: Bubble, next: nat, ghost tries: nat)
    requires forall n :: 0.0 <= random(n) < 1.0
    ensures DrawnFrom(bubble, option, placed, width, height, random, draw, tries, sqrt)
    ensures WellDrawn(bubble, option, width, height)
    ensures 1 <= tries <= MaxAttempts
    ensures tries < MaxAttempts ==> !HasOverlap(bubble.x, bubble.y, bubble.size, placed, sqrt)
    ensures next == draw + 2 * tries + 3
  {
    var size := MinSize + random(draw) * SizeSpread;
    SizeDraw(random(draw), size);
    var x, y;
    x, y, next, tries := DrawPosition(placed, size, width, height, random, draw, sqrt);
    ScaledDraw(random(draw + 1 + 2 * (tries - 1)), width - size, x);
    ScaledDraw(random(draw + 2 + 2 * (tries - 1)), height - size, y);
    var vx := (random(next) - 0.5) * SpeedSpread;
    var vy := (random(next + 1) - 0.5) * SpeedSpread;
    SpeedDraw(random(next), vx);
    SpeedDraw(random(next + 1), vy);
    next := next + 2;
    bubble := Bubble(option.value, x, y, vx, vy, size, option.caption, option.description);
  }

  /**
    What DrawBubble promises, as a function value: `drawn(b, option, placed,
    draw, tries)` holds when `b` is well drawn for `option` and is what
    placement builds from the draws starting at `draw` after `tries`
    attempts against `placed`.
   */
  function Drawing(width: real, height: real, random: nat -> real, sqrt: real -> real)
    : (BubbleOption, Bubble, seq<Bubble>, nat, nat) -> bool
  {
    (option: BubbleOption, b: Bubble, placed: seq<Bubble>, draw: nat, tries: nat) =>
      WellDrawn(b, option, width, height) && DrawnFrom(b, option, placed, width, height, random, draw, tries, sqrt)
  }

  /** The drawing rule holds of a bubble that DrawBubble could return. */
  lemma DrawingHolds(option: BubbleOption, b: Bubble, placed: seq<Bubble>, draw: nat, tries: nat,
                     width: real, height: real, random: nat -> real, sqrt: real -> real)
    requires WellDrawn(b, option, width, height)
    requires DrawnFrom(b, option, placed, width, height, random, draw, tries, sqrt)
    ensures Drawing(width, height, random, sqrt)(option, b, placed, draw, tries)
  {
  }

  /**
    `bubbles` are what placement builds for `options` under the rule
    `drawn`: bubble k from the draws starting at `starts[k]` after
    `attempts[k]` attempts against the bubbles before it; the first starts
    at draw 0, each next one where the one before stopped.
   */
  predicate PlacedFrom(bubbles: seq<Bubble>, options: seq<BubbleOption>, attempts: seq<nat>, starts: seq<nat>,
                       drawn: (BubbleOption, Bubble, seq<Bubble>, nat, nat) -> bool)
  {
    && |bubbles| == |options| && |attempts| == |options| && |starts| == |options|
    && (forall k :: 0 <= k < |options| ==> drawn(options[k], bubbles[k], bubbles[..k], starts[k], attempts[k]))
    && (0 < |options| ==> starts[0] == 0)
    && (forall k :: 0 < k < |options| ==> starts[k] == starts[k - 1] + 2 * attempts[k - 1] + 3)
  }

  /** The first draw left after the bubbles placed from `starts` with `attempts`. */
  function NextDraw(attempts: seq<nat>, starts: seq<nat>): nat
    requires |attempts| == |starts|
  {
    if starts == [] then 0 else starts[|starts| - 1] + 2 * attempts[|attempts| - 1] + 3
  }

  /** Placing one more bubble, drawn where the others stopped, extends a placement. */
  lemma PlacedFromAppend(bubbles: seq<Bubble>, options: seq<BubbleOption>, attempts: seq<nat>, starts: seq<nat>,
                         b: Bubble, option: BubbleOption, tries: nat,
                         drawn: (BubbleOption, Bubble, seq<Bubble>, nat, nat) -> bool)
    requires PlacedFrom(bubbles, options, attempts, starts, drawn)
    requires drawn(option, b, bubbles, NextDraw(attempts, starts), tries)
    ensures PlacedFrom(bubbles + [b], options + [option], attempts + [tries], starts + [NextDraw(attempts, starts)], drawn)
  {
    var n := |bubbles|;
    var bs, os, ats, ss := bubbles + [b], options + [option], attempts + [tries], starts + [NextDraw(attempts, starts)];
    forall k | 0 <= k < n + 1
      ensures drawn(os[k], bs[k], bs[..k], ss[k], ats[k])
    {
      if k < n {
        assert bs[k] == bubbles[k] && os[k] == options[k] && ats[k] == attempts[k] && ss[k] == starts[k];
        assert bs[..k] == bubbles[..k];
      } else {
        assert bs[..k] == bubbles;
      }
    }
  }

  /**
    Initial placement: one bubble per option, in option order, each drawn
    by DrawBubble against the bubbles placed before it, from the draws left
    by the bubble before. `attempts[k]` is how many positions bubble k drew
    and `starts[k]` its first draw; fewer than 100 attempts means its
    position does not overlap any earlier bubble.
   */
  method Place(options: seq<BubbleOption>, width: real, height: real, random: nat -> real, sqrt: real -> real)
    returns (bubbles: seq<Bubble>, ghost attempts: seq<nat>, ghost starts: seq<nat>)
    requires forall n :: 0.0 <= random(n) < 1.0
    ensures PlacedFrom(bubbles, options, attempts, starts, Drawing(width, height, random, sqrt))
    ensures forall k :: 0 <= k < |options| ==> WellDrawn(bubbles[k], options[k], width, height)
    ensures forall k :: 0 <= k < |options| ==>
      DrawnFrom(bubbles[k], options[k], bubbles[..k], width, height, random, starts[k], attempts[k], sqrt)
    ensures forall k :: 0 <= k < |options| ==> 1 <= attempts[k] <= MaxAttempts
    ensures forall k :: 0 <= k < |options| && attempts[k] < MaxAttempts ==>
      !HasOverlap(bubbles[k].x, bubbles[k].y, bubbles[k].size, bubbles[..k], sqrt)
  {
    ghost var drawn := Drawing(width, height, random, sqrt);
    bubbles, attempts, starts := [], [], [];
    var draw: nat := 0;
    for i := 0 to |options|
      invariant PlacedFrom(bubbles, options[..i], attempts, starts, drawn)
      invariant draw == NextDraw(attempts, starts)
    {
      var bubble, next;
      ghost var tries;
      bubble, next, tries := DrawBubble(options[i], bubbles, width, height, random, draw, sqrt);
      DrawingHolds(options[i], bubble, bubbles, draw, tries, width, height, random, sqrt);
      PlacedFromAppend(bubbles, options[..i], attempts, starts, bubble, options[i], tries, drawn);
      assert options[..i + 1] == options[..i] + [options[i]];
      bubbles := bubbles + [bubble];
      attempts := attempts + [tries];
      starts := starts + [draw];
      draw := next;
    }
    assert options[..|options|] == options;
    PlacedEach(bubbles, options, attempts, starts, width, height, random, sqrt);
  }

  /** Each bubble of a placement is well drawn, and was drawn as DrawBubble promises. */
  lemma PlacedEach(bubbles: seq<Bubble>, options: seq<BubbleOption>, attempts: seq<nat>, starts: seq<nat>,
                   width: real, height: real, random: nat -> real, sqrt: real -> real)
    requires PlacedFrom(bubbles, options, attempts, starts, Drawing(width, height, random, sqrt))
    ensures forall k :: 0 <= k < |options| ==> WellDrawn(bubbles[k], options[k], width, height)
    ensures forall k :: 0 <= k < |options| ==>
      DrawnFrom(bubbles[k], options[k], bubbles[..k], width, height, random, starts[k], attempts[k], sqrt)
    ensures forall k :: 0 <= k < |options| ==> 1 <= attempts[k] <= MaxAttempts
    ensures forall k :: 0 <= k < |options| && attempts[k] < MaxAttempts ==>
      !HasOverlap(bubbles[k].x, bubbles[k].y, bubbles[k].size, bubbles[..k], sqrt)
  {
    forall k | 0 <= k < |options|
      ensures WellDrawn(bubbles[k], options[k], width, height)
      ensures DrawnFrom(bubbles[k], options[k], bubbles[..k], width, height, random, starts[k], attempts[k], sqrt)
    {
      assert Drawing(width, height, random, sqrt)(options[k], bubbles[k], bubbles[..k], starts[k], attempts[k]);
    }
  }

  // ---------------------------------------------------------------------
  // One bubble's own motion: drift and wall bounce
  // ---------------------------------------------------------------------

  /** One frame of free drift: the position advances by the velocity. */
  function Drift(b: Bubble): (r: Bubble)
    ensures SameBody(r, b) && r.vx == b.vx && r.vy == b.vy
    ensures r.x - b.x == b.vx && r.y - b.y == b.vy
  {
    b.(x := b.x + b.vx, y := b.y + b.vy)
  }

  /**
    The four wall checks, left, right, top, bottom, in that order. A wall
    that is touched or crossed puts the bubble against it and sets the
    speed on that axis to point away from it, keeping its magnitude.
   */
  function BounceWalls(b: Bubble, width: real, height: real): (r: Bubble)
    ensures SameBody(r, b)
    ensures Abs(r.vx) == Abs(b.vx) && Abs(r.vy) == Abs(b.vy)
    // The x axis: the right wall is tested on the position the left wall left.
    ensures 0.0 < b.x && b.x + b.size < width ==> r.x == b.x && r.vx == b.vx
    ensures b.x <= 0.0 && b.size < width ==> r.x == 0.0 && r.vx == Abs(b.vx)
    ensures Max(b.x, 0.0) + b.size >= width ==> r.x == width - b.size && r.vx == -Abs(b.vx)
    // The y axis, likewise.
    ensures 0.0 < b.y && b.y + b.size < height ==> r.y == b.y && r.vy == b.vy
    ensures b.y <= 0.0 && b.size < height ==> r.y == 0.0 && r.vy == Abs(b.vy)
    ensures Max(b.y, 0.0) + b.size >= height ==> r.y == height - b.size && r.vy == -Abs(b.vy)
    // Whenever the bubble fits, it ends inside the container.
    ensures Fits(b, width, height) ==> InBounds(r, width, height)
  {
    var left := if b.x <= 0.0 then b.(x := 0.0, vx := Abs(b.vx)) else b;
    var right := if left.x + left.size >= width then left.(x := width - left.size, vx := -Abs(left.vx)) else left;
    var top := if right.y <= 0.0 then right.(y := 0.0, vy := Abs(right.vy)) else right;
    if top.y + top.size >= height then top.(y := height - top.size, vy := -Abs(top.vy)) else top
  }

  // ---------------------------------------------------------------------
  // A pair of bubbles: contact, separation, clamping, impulse
  // ---------------------------------------------------------------------

  /** Squared distance between the centres of two bubbles. */
  function SqCentreDist(b: Bubble, o: Bubble): real
  {
    var dx := CentreX(b) - CentreX(o);
    var dy := CentreY(b) - CentreY(o);
    dx * dx + dy * dy
  }

  /** The centre distance below which two bubbles collide. */
  function MinDistance(b: Bubble, o: Bubble): real
  {
    (b.size + o.size) / 2.0 + CollisionGap
  }

  /** A collision: the unit normal from `other` towards `bubble`, and how deep they overlap. */
  datatype Contact = Contact(nx: real, ny: real, overlap: real)

  /** The collision test: a contact when the centre distance is in (0, minDistance), none otherwise. */
  function Touch(b: Bubble, o: Bubble, sqrt: real -> real): (r: Option<Contact>)
    ensures r.Some? ==> 0.0 < r.value.overlap
  {
    var dx := CentreX(b) - CentreX(o);
    var dy := CentreY(b) - CentreY(o);
    var distance := Hypot(dx, dy, sqrt);
    var minDistance := MinDistance(b, o);
    if distance < minDistance && distance > 0.0 then
      Some(Contact(dx / distance, dy / distance, minDistance - distance))
    else
      None
  }

  /** Pushes the two bubbles apart along the normal, each by half the overlap plus the slack. */
  function Separate(b: Bubble, o: Bubble, c: Contact): (r: (Bubble, Bubble))
    ensures SameBody(r.0, b) && SameBody(r.1, o)
    ensures r.0.vx == b.vx && r.0.vy == b.vy && r.1.vx == o.vx && r.1.vy == o.vy
    // The midpoint of the two corners does not move.
    ensures r.0.x + r.1.x == b.x + o.x && r.0.y + r.1.y == b.y + o.y
  {
    var separationX := c.nx * (c.overlap / 2.0 + SeparationSlack);
    var separationY := c.ny * (c.overlap / 2.0 + SeparationSlack);
    (b.(x := b.x + separationX, y := b.y + separationY),
     o.(x := o.x - separationX, y := o.y - separationY))
  }

  /** `Math.max(0, Math.min(v, width - size))` on each axis. */
  function Clamp(b: Bubble, width: real, height: real): (r: Bubble)
    ensures SameBody(r, b) && r.vx == b.vx && r.vy == b.vy
    ensures Fits(b, width, height) ==> InBounds(r, width, height)
    ensures InBounds(b, width, height) ==> r == b
  {
    b.(x := Max(0.0, Min(b.x, width - b.size)), y := Max(0.0, Min(b.y, height - b.size)))
  }

  /** The velocity of `b` relative to `o`, projected on (nx, ny). */
  function RelNormalVelocity(b: Bubble, o: Bubble, nx: real, ny: real): real
  {
    (b.vx - o.vx) * nx + (b.vy - o.vy) * ny
  }

  /**
    The collision response: when the bubbles approach along the normal,
    an equal and opposite damped impulse; otherwise nothing.
   */
  function Impulse(b: Bubble, o: Bubble, nx: real, ny: real): (r: (Bubble, Bubble))
    ensures SameBody(r.0, b) && SameBody(r.1, o)
    ensures r.0.x == b.x && r.0.y == b.y && r.1.x == o.x && r.1.y == o.y
    // Equal masses: the summed velocity is conserved.
    ensures r.0.vx + r.1.vx == b.vx + o.vx && r.0.vy + r.1.vy == b.vy + o.vy
    ensures 0.0 <= RelNormalVelocity(b, o, nx, ny) ==> r == (b, o)
  {
    var dvn := RelNormalVelocity(b, o, nx, ny);
    if dvn < 0.0 then
      var impulse := dvn * Damping;
      (b.(vx := b.vx - impulse * nx, vy := b.vy - impulse * ny),
       o.(vx := o.vx + impulse * nx, vy := o.vy + impulse * ny))
    else
      (b, o)
  }

  /**
    When the pair approaches, the impulse `dvn * 0.9` is taken off the
    bubble's velocity along the normal and added to the other's.
   */
  lemma ImpulseAlongNormal(b: Bubble, o: Bubble, nx: real, ny: real)
    requires RelNormalVelocity(b, o, nx, ny) < 0.0
    ensures var r := Impulse(b, o, nx, ny);
      var impulse := RelNormalVelocity(b, o, nx, ny) * Damping;
      r.0.vx == b.vx - impulse * nx && r.0.vy == b.vy - impulse * ny &&
      r.1.vx == o.vx + impulse * nx && r.1.vy == o.vy + impulse * ny
  {
  }

  /** The impulse never changes the relative velocity across the normal. */
  lemma ImpulseKeepsTangential(b: Bubble, o: Bubble, nx: real, ny: real)
    ensures var r := Impulse(b, o, nx, ny);
      (r.0.vx - r.1.vx) * ny - (r.0.vy - r.1.vy) * nx == (b.vx - o.vx) * ny - (b.vy - o.vy) * nx
  {
    var dvn := RelNormalVelocity(b, o, nx, ny);
    if dvn < 0.0 {
      var impulse := dvn * Damping;
      var r := Impulse(b, o, nx, ny);
      var dvx, dvy := b.vx - o.vx, b.vy - o.vy;
      assert r.0.vx - r.1.vx == dvx - 2.0 * impulse * nx;
      assert r.0.vy - r.1.vy == dvy - 2.0 * impulse * ny;
      assert (dvx - 2.0 * impulse * nx) * ny - (dvy - 2.0 * impulse * ny) * nx == dvx * ny - dvy * nx;
    }
  }

  /** Two pairs with the same velocities have the same relative normal velocity. */
  lemma SameVelocities(b: Bubble, o: Bubble, b1: Bubble, o1: Bubble, nx: real, ny: real)
    requires b1.vx == b.vx && b1.vy == b.vy && o1.vx == o.vx && o1.vy == o.vy
    ensures RelNormalVelocity(b1, o1, nx, ny) == RelNormalVelocity(b, o, nx, ny)
  {
  }

  /**
    With a unit normal, an approaching pair leaves the impulse separating:
    the relative normal velocity becomes -0.8 times what it was.
   */
  lemma ImpulseSeparates(b: Bubble, o: Bubble, nx: real, ny: real)
    requires nx * nx + ny * ny == 1.0
    requires RelNormalVelocity(b, o, nx, ny) < 0.0
    ensures var r := Impulse(b, o, nx, ny);
      RelNormalVelocity(r.0, r.1, nx, ny) == (1.0 - 2.0 * Damping) * RelNormalVelocity(b, o, nx, ny) &&
      0.0 < RelNormalVelocity(r.0, r.1, nx, ny)
  {
    var dvn := RelNormalVelocity(b, o, nx, ny);
    var impulse := dvn * Damping;
    var r := Impulse(b, o, nx, ny);
    var dvx, dvy := b.vx - o.vx, b.vy - o.vy;
    assert r.0.vx - r.1.vx == dvx - 2.0 * impulse * nx;
    assert r.0.vy - r.1.vy == dvy - 2.0 * impulse * ny;
    var after := RelNormalVelocity(r.0, r.1, nx, ny);
    assert after == (dvx - 2.0 * impulse * nx) * nx + (dvy - 2.0 * impulse * ny) * ny;
    assert after == dvn - 2.0 * impulse * (nx * nx + ny * ny);
    assert after == dvn - 2.0 * impulse;
  }

  /** What happens to `bubble` and `other` when the step visits them as a pair. */
  function PairStep(b: Bubble, o: Bubble, width: real, height: real, sqrt: real -> real): (r: (Bubble, Bubble))
    ensures SameBody(r.0, b) && SameBody(r.1, o)
    ensures r.0.vx + r.1.vx == b.vx + o.vx && r.0.vy + r.1.vy == b.vy + o.vy
    ensures Touch(b, o, sqrt).None? ==> r == (b, o)
    ensures Touch(b, o, sqrt).Some? && Fits(b, width, height) && Fits(o, width, height) ==>
      InBounds(r.0, width, height) && InBounds(r.1, width, height)
  {
    match Touch(b, o, sqrt)
    case None => (b, o)
    case Some(c) => Respond(b, o, c, width, height)
  }

  /**
    With an exact square root, two bubbles collide iff their centres are
    apart but closer than `minDistance`, compared on squares.
   */
  lemma TouchBySquares(b: Bubble, o: Bubble, sqrt: real -> real)
    requires IsSqrt(sqrt)
    requires 0.0 < MinDistance(b, o)
    ensures Touch(b, o, sqrt).Some? <==>
      (CentreX(b) != CentreX(o) || CentreY(b) != CentreY(o)) &&
      SqCentreDist(b, o) < MinDistance(b, o) * MinDistance(b, o)
  {
    HypotCompare(CentreX(b) - CentreX(o), CentreY(b) - CentreY(o), sqrt, MinDistance(b, o));
  }

  /** With an exact square root, the contact normal is a unit vector along the centre line. */
  lemma ContactNormal(b: Bubble, o: Bubble, sqrt: real -> real)
    requires IsSqrt(sqrt)
    requires Touch(b, o, sqrt).Some?
    ensures var c := Touch(b, o, sqrt).value;
      var d := Hypot(CentreX(b) - CentreX(o), CentreY(b) - CentreY(o), sqrt);
      0.0 < d &&
      c.nx * c.nx + c.ny * c.ny == 1.0 &&
      c.nx * d == CentreX(b) - CentreX(o) &&
      c.ny * d == CentreY(b) - CentreY(o) &&
      c.overlap == MinDistance(b, o) - d
  {
    var c := Touch(b, o, sqrt).value;
    var dx, dy := CentreX(b) - CentreX(o), CentreY(b) - CentreY(o);
    var d := Hypot(dx, dy, sqrt);
    HypotSquared(dx, dy, sqrt);
    assert 0.0 < d < MinDistance(b, o);
    assert c.nx * d == dx;
    assert c.ny * d == dy;
    UnitFromScaled(c.nx, c.ny, dx, dy, d);
  }

  /**
    Separation, before clamping, leaves the two centres exactly
    `minDistance + 1` apart.
   */
  lemma SeparationRestoresGap(b: Bubble, o: Bubble, sqrt: real -> real)
    requires IsSqrt(sqrt)
    requires Touch(b, o, sqrt).Some?
    ensures var r := Separate(b, o, Touch(b, o, sqrt).value);
      Hypot(CentreX(r.0) - CentreX(r.1), CentreY(r.0) - CentreY(r.1), sqrt) == MinDistance(b, o) + 1.0
  {
    ContactNormal(b, o, sqrt);
    var c := Touch(b, o, sqrt).value;
    SeparateAlongNormal(b, o, c, Hypot(CentreX(b) - CentreX(o), CentreY(b) - CentreY(o), sqrt));
    SeparatedGap(b, o, c, sqrt);
  }

  /**
    For a unit normal, a centre offset of `minDistance + 1` times the normal
    puts the centres exactly `minDistance + 1` apart.
   */
  lemma SeparatedGap(b: Bubble, o: Bubble, c: Contact, sqrt: real -> real)
    requires IsSqrt(sqrt)
    requires c.nx * c.nx + c.ny * c.ny == 1.0
    requires 0.0 <= MinDistance(b, o)
    requires var r := Separate(b, o, c);
      CentreX(r.0) - CentreX(r.1) == c.nx * (MinDistance(b, o) + 1.0) &&
      CentreY(r.0) - CentreY(r.1) == c.ny * (MinDistance(b, o) + 1.0)
    ensures var r := Separate(b, o, c);
      Hypot(CentreX(r.0) - CentreX(r.1), CentreY(r.0) - CentreY(r.1), sqrt) == MinDistance(b, o) + 1.0
  {
    var r := Separate(b, o, c);
    HypotOfScaledUnit(c.nx, c.ny, MinDistance(b, o) + 1.0, CentreX(r.0) - CentreX(r.1), CentreY(r.0) - CentreY(r.1), sqrt);
  }

  /** Separation moves the two centres apart by twice the push along the normal. */
  lemma SeparateShift(b: Bubble, o: Bubble, c: Contact)
    ensures var r := Separate(b, o, c);
      var push := c.overlap / 2.0 + SeparationSlack;
      CentreX(r.0) - CentreX(r.1) == CentreX(b) - CentreX(o) + 2.0 * (c.nx * push) &&
      CentreY(r.0) - CentreY(r.1) == CentreY(b) - CentreY(o) + 2.0 * (c.ny * push)
  {
  }

  /**
    For a contact at distance `d` whose normal scales to the centre line,
    separation leaves the centre offset at `minDistance + 1` times the normal.
   */
  lemma SeparateAlongNormal(b: Bubble, o: Bubble, c: Contact, d: real)
    requires c.nx * d == CentreX(b) - CentreX(o) && c.ny * d == CentreY(b) - CentreY(o)
    requires c.overlap == MinDistance(b, o) - d
    ensures var r := Separate(b, o, c);
      CentreX(r.0) - CentreX(r.1) == c.nx * (MinDistance(b, o) + 1.0) &&
      CentreY(r.0) - CentreY(r.1) == c.ny * (MinDistance(b, o) + 1.0)
  {
    SeparateShift(b, o, c);
    var push := c.overlap / 2.0 + SeparationSlack;
    var reach := MinDistance(b, o) + 1.0;
    assert d + 2.0 * push == reach;
    assert c.nx * d + 2.0 * (c.nx * push) == c.nx * (d + 2.0 * push);
    assert c.ny * d + 2.0 * (c.ny * push) == c.ny * (d + 2.0 * push);
  }

  /** The response to a contact with unit normal: separate, clamp, then the impulse. */
  function Respond(b: Bubble, o: Bubble, c: Contact, width: real, height: real): (r: (Bubble, Bubble))
    ensures SameBody(r.0, b) && SameBody(r.1, o)
    ensures r.0.vx + r.1.vx == b.vx + o.vx && r.0.vy + r.1.vy == b.vy + o.vy
    ensures Fits(b, width, height) && Fits(o, width, height) ==>
      InBounds(r.0, width, height) && InBounds(r.1, width, height)
  {
    var separated := Separate(b, o, c);
    Impulse(Clamp(separated.0, width, height), Clamp(separated.1, width, height), c.nx, c.ny)
  }

  /** The impulse on a pair that moves with the velocities of `b` and `o`. */
  lemma ImpulseSeparatesFrom(b: Bubble, o: Bubble, b1: Bubble, o1: Bubble, nx: real, ny: real)
    requires b1.vx == b.vx && b1.vy == b.vy && o1.vx == o.vx && o1.vy == o.vy
    requires nx * nx + ny * ny == 1.0
    requires RelNormalVelocity(b, o, nx, ny) < 0.0
    ensures var r := Impulse(b1, o1, nx, ny);
      RelNormalVelocity(r.0, r.1, nx, ny) == (1.0 - 2.0 * Damping) * RelNormalVelocity(b, o, nx, ny) &&
      0.0 < RelNormalVelocity(r.0, r.1, nx, ny)
  {
    SameVelocities(b, o, b1, o1, nx, ny);
    ImpulseSeparates(b1, o1, nx, ny);
  }

  /**
    With a unit normal, the response to an approaching pair leaves it
    separating: neither separation nor clamping touches the velocities.
   */
  lemma RespondSeparates(b: Bubble, o: Bubble, c: Contact, width: real, height: real)
    requires c.nx * c.nx + c.ny * c.ny == 1.0
    requires RelNormalVelocity(b, o, c.nx, c.ny) < 0.0
    ensures var r := Respond(b, o, c, width, height);
      RelNormalVelocity(r.0, r.1, c.nx, c.ny) == (1.0 - 2.0 * Damping) * RelNormalVelocity(b, o, c.nx, c.ny) &&
      0.0 < RelNormalVelocity(r.0, r.1, c.nx, c.ny)
  {
    var separated := Separate(b, o, c);
    var b1, o1 := Clamp(separated.0, width, height), Clamp(separated.1, width, height);
    ImpulseSeparatesFrom(b, o, b1, o1, c.nx, c.ny);
  }

  /**
    A colliding pair that approaches along the normal leaves the pair step
    separating: its relative normal velocity becomes -0.8 times what it was.
   */
  lemma CollisionSeparates(b: Bubble, o: Bubble, width: real, height: real, sqrt: real -> real)
    requires IsSqrt(sqrt)
    requires Touch(b, o, sqrt).Some?
    requires RelNormalVelocity(b, o, Touch(b, o, sqrt).value.nx, Touch(b, o, sqrt).value.ny) < 0.0
    ensures var c := Touch(b, o, sqrt).value;
      var r := PairStep(b, o, width, height, sqrt);
      RelNormalVelocity(r.0, r.1, c.nx, c.ny) == (1.0 - 2.0 * Damping) * RelNormalVelocity(b, o, c.nx, c.ny) &&
      0.0 < RelNormalVelocity(r.0, r.1, c.nx, c.ny)
  {
    ContactNormal(b, o, sqrt);
    RespondSeparates(b, o, Touch(b, o, sqrt).value, width, height);
  }

  // ---------------------------------------------------------------------
  // The whole frame, as a specification of Animate
  // ---------------------------------------------------------------------

  /**
    The collision handling of a frame in a width x height container, as a
    function value: what a visit does to a pair (bubble, other).
   */
  function Physics(width: real, height: real, sqrt: real -> real): (Bubble, Bubble) -> (Bubble, Bubble)
  {
    (b: Bubble, o: Bubble) => PairStep(b, o, width, height, sqrt)
  }

  /** A pair rule changes no bubble's identity, size or texts. */
  ghost predicate KeepsBodies(pair: (Bubble, Bubble) -> (Bubble, Bubble))
  {
    forall b, o :: SameBody(pair(b, o).0, b) && SameBody(pair(b, o).1, o)
  }

  /** A pair rule keeps a bubble that fits and was inside the container inside it. */
  ghost predicate KeepsBounds(pair: (Bubble, Bubble) -> (Bubble, Bubble), width: real, height: real)
  {
    forall b, o :: Fits(b, width, height) && Fits(o, width, height) ==>
      (InBounds(b, width, height) ==> InBounds(pair(b, o).0, width, height)) &&
      (InBounds(o, width, height) ==> InBounds(pair(b, o).1, width, height))
  }

  /** A pair rule keeps the summed velocity of the pair. */
  ghost predicate KeepsMomentum(pair: (Bubble, Bubble) -> (Bubble, Bubble))
  {
    forall b, o :: pair(b, o).0.vx + pair(b, o).1.vx == b.vx + o.vx && pair(b, o).0.vy + pair(b, o).1.vy == b.vy + o.vy
  }

  /** The collision handling keeps bodies, bounds and momentum. */
  lemma PhysicsKeeps(width: real, height: real, sqrt: real -> real)
    ensures KeepsBodies(Physics(width, height, sqrt))
    ensures KeepsBounds(Physics(width, height, sqrt), width, height)
    ensures KeepsMomentum(Physics(width, height, sqrt))
  {
    var pair := Physics(width, height, sqrt);
    forall b, o
      ensures SameBody(pair(b, o).0, b) && SameBody(pair(b, o).1, o)
      ensures Fits(b, width, height) && Fits(o, width, height) ==>
        (InBounds(b, width, height) ==> InBounds(pair(b, o).0, width, height)) &&
        (InBounds(o, width, height) ==> InBounds(pair(b, o).1, width, height))
      ensures pair(b, o).0.vx + pair(b, o).1.vx == b.vx + o.vx && pair(b, o).0.vy + pair(b, o).1.vy == b.vy + o.vy
    {
      assert pair(b, o) == PairStep(b, o, width, height, sqrt);
    }
  }

  /**
    The visit of bubble i to bubble j. It is skipped when the ids are
    equal (in particular when j == i); otherwise both are replaced by what
    the pair rule makes of them.
   */
  function PairAt(s: seq<Bubble>, i: nat, j: nat, pair: (Bubble, Bubble) -> (Bubble, Bubble)): (r: seq<Bubble>)
    requires i < |s| && j < |s|
    ensures |r| == |s|
    ensures forall k :: 0 <= k < |s| && k != i && k != j ==> r[k] == s[k]
    ensures s[i].id == s[j].id ==> r == s
  {
    if s[i].id == s[j].id then s
    else
      var after := pair(s[i], s[j]);
      s[i := after.0][j := after.1]
  }

  /** Bubble i visits bubbles 0 .. j-1, in order. */
  function Sweep(s: seq<Bubble>, i: nat, j: nat, pair: (Bubble, Bubble) -> (Bubble, Bubble)): (r: seq<Bubble>)
    requires i < |s| && j <= |s|
    ensures |r| == |s|
    decreases j
  {
    if j == 0 then s
    else PairAt(Sweep(s, i, j - 1, pair), i, j - 1, pair)
  }

  /** Bubble i's turn in a frame: drift, walls, then a visit to every bubble. */
  function Turn(s: seq<Bubble>, i: nat, width: real, height: real, pair: (Bubble, Bubble) -> (Bubble, Bubble)): (r: seq<Bubble>)
    requires i < |s|
    ensures |r| == |s|
  {
    Sweep(s[i := BounceWalls(Drift(s[i]), width, height)], i, |s|, pair)
  }

  /** The turns of bubbles 0 .. n-1, in order. */
  function FrameUpTo(s: seq<Bubble>, n: nat, width: real, height: real, pair: (Bubble, Bubble) -> (Bubble, Bubble)): (r: seq<Bubble>)
    requires n <= |s|
    ensures |r| == |s|
  {
    if n == 0 then s
    else Turn(FrameUpTo(s, n - 1, width, height, pair), n - 1, width, height, pair)
  }

  /** One full animation frame. */
  function Frame(s: seq<Bubble>, width: real, height: real, sqrt: real -> real): (r: seq<Bubble>)
    ensures |r| == |s|
    ensures forall k :: 0 <= k < |s| ==> SameBody(r[k], s[k])
  {
    PhysicsKeeps(width, height, sqrt);
    FrameUpToKeepsBodies(s, |s|, width, height, Physics(width, height, sqrt));
    FrameUpTo(s, |s|, width, height, Physics(width, height, sqrt))
  }

  /** A sweep changes no bubble's identity, size or texts. */
  lemma {:induction false} SweepKeepsBodies(s: seq<Bubble>, i: nat, j: nat, pair: (Bubble, Bubble) -> (Bubble, Bubble))
    requires i < |s| && j <= |s|
    requires KeepsBodies(pair)
    ensures forall k :: 0 <= k < |s| ==> SameBody(Sweep(s, i, j, pair)[k], s[k])
    decreases j
  {
    if j > 0 {
      SweepKeepsBodies(s, i, j - 1, pair);
    }
  }

  /** The turns of bubbles 0 .. n-1 change no bubble's identity, size or texts. */
  lemma {:induction false} FrameUpToKeepsBodies(s: seq<Bubble>, n: nat, width: real, height: real, pair: (Bubble, Bubble) -> (Bubble, Bubble))
    requires n <= |s|
    requires KeepsBodies(pair)
    ensures forall k :: 0 <= k < |s| ==> SameBody(FrameUpTo(s, n, width, height, pair)[k], s[k])
  {
    if n > 0 {
      var f := FrameUpTo(s, n - 1, width, height, pair);
      FrameUpToKeepsBodies(s, n - 1, width, height, pair);
      SweepKeepsBodies(f[n - 1 := BounceWalls(Drift(f[n - 1]), width, height)], n - 1, |s|, pair);
    }
  }

  /** A sweep leaves every bubble that was inside the container inside it. */
  lemma {:induction false} SweepKeepsBounds(s: seq<Bubble>, i: nat, j: nat, width: real, height: real, pair: (Bubble, Bubble) -> (Bubble, Bubble))
    requires i < |s| && j <= |s|
    requires KeepsBodies(pair) && KeepsBounds(pair, width, height)
    requires forall k :: 0 <= k < |s| ==> Fits(s[k], width, height)
    ensures forall k :: 0 <= k < |s| && InBounds(s[k], width, height) ==>
      InBounds(Sweep(s, i, j, pair)[k], width, height)
    decreases j
  {
    if j > 0 {
      SweepKeepsBounds(s, i, j - 1, width, height, pair);
      SweepKeepsBodies(s, i, j - 1, pair);
    }
  }

  /** Bubble i's turn puts it inside the container and keeps every bubble that was inside it there. */
  lemma TurnKeepsBounds(s: seq<Bubble>, i: nat, width: real, height: real, pair: (Bubble, Bubble) -> (Bubble, Bubble))
    requires i < |s|
    requires KeepsBodies(pair) && KeepsBounds(pair, width, height)
    requires forall k :: 0 <= k < |s| ==> Fits(s[k], width, height)
    ensures forall k :: 0 <= k < |s| && (k == i || InBounds(s[k], width, height)) ==>
      InBounds(Turn(s, i, width, height, pair)[k], width, height)
  {
    var moved := s[i := BounceWalls(Drift(s[i]), width, height)];
    assert forall k :: 0 <= k < |s| ==> Fits(moved[k], width, height);
    SweepKeepsBounds(moved, i, |s|, width, height, pair);
  }

  /** After the turns of bubbles 0 .. n-1, each of them is inside the container. */
  lemma {:induction false} FrameUpToInBounds(s: seq<Bubble>, n: nat, width: real, height: real, pair: (Bubble, Bubble) -> (Bubble, Bubble))
    requires n <= |s|
    requires KeepsBodies(pair) && KeepsBounds(pair, width, height)
    requires forall k :: 0 <= k < |s| ==> Fits(s[k], width, height)
    ensures forall k :: 0 <= k < n ==> InBounds(FrameUpTo(s, n, width, height, pair)[k], width, height)
  {
    if n > 0 {
      var f := FrameUpTo(s, n - 1, width, height, pair);
      FrameUpToInBounds(s, n - 1, width, height, pair);
      FrameUpToKeepsBodies(s, n - 1, width, height, pair);
      assert forall k :: 0 <= k < |f| ==> Fits(f[k], width, height);
      TurnKeepsBounds(f, n - 1, width, height, pair);
      assert FrameUpTo(s, n, width, height, pair) == Turn(f, n - 1, width, height, pair);
    }
  }

  /**
    The frame invariant: whenever the container is at least as large as
    every bubble, every bubble is inside it after a frame, wherever the
    frame started.
   */
  lemma FrameInBounds(s: seq<Bubble>, width: real, height: real, sqrt: real -> real)
    requires forall k :: 0 <= k < |s| ==> Fits(s[k], width, height)
    ensures forall k :: 0 <= k < |s| ==> InBounds(Frame(s, width, height, sqrt)[k], width, height)
  {
    PhysicsKeeps(width, height, sqrt);
    FrameUpToInBounds(s, |s|, width, height, Physics(width, height, sqrt));
  }

  /** The summed velocity (the momentum, all masses equal) of the bubbles. */
  function Momentum(s: seq<Bubble>): (real, real)
  {
    if s == [] then (0.0, 0.0)
    else
      var rest := Momentum(s[1..]);
      (s[0].vx + rest.0, s[0].vy + rest.1)
  }

  /** Replacing one bubble changes the momentum by the difference of the two velocities. */
  lemma {:induction false} MomentumUpdate(s: seq<Bubble>, k: nat, b: Bubble)
    requires k < |s|
    ensures Momentum(s[k := b]).0 == Momentum(s).0 - s[k].vx + b.vx
    ensures Momentum(s[k := b]).1 == Momentum(s).1 - s[k].vy + b.vy
  {
    if k == 0 {
      assert s[k := b][1..] == s[1..];
    } else {
      assert s[k := b][1..] == s[1..][k - 1 := b];
      MomentumUpdate(s[1..], k - 1, b);
    }
  }

  /** Replacing two bubbles by two others of the same summed velocity keeps the momentum. */
  lemma ReplacePairKeepsMomentum(s: seq<Bubble>, i: nat, j: nat, a: Bubble, b: Bubble)
    requires i < |s| && j < |s| && i != j
    requires a.vx + b.vx == s[i].vx + s[j].vx && a.vy + b.vy == s[i].vy + s[j].vy
    ensures Momentum(s[i := a][j := b]) == Momentum(s)
  {
    var t := s[i := a];
    assert t[j] == s[j];
    MomentumUpdate(s, i, a);
    MomentumUpdate(t, j, b);
  }

  /** A visit conserves the momentum of the whole system. */
  lemma PairAtConservesMomentum(s: seq<Bubble>, i: nat, j: nat, pair: (Bubble, Bubble) -> (Bubble, Bubble))
    requires i < |s| && j < |s|
    requires KeepsMomentum(pair)
    ensures Momentum(PairAt(s, i, j, pair)) == Momentum(s)
  {
    if s[i].id != s[j].id {
      var after := pair(s[i], s[j]);
      ReplacePairKeepsMomentum(s, i, j, after.0, after.1);
    }
  }

  /** The collision pass of a turn conserves the momentum of the whole system. */
  lemma {:induction false} SweepConservesMomentum(s: seq<Bubble>, i: nat, j: nat, pair: (Bubble, Bubble) -> (Bubble, Bubble))
    requires i < |s| && j <= |s|
    requires KeepsMomentum(pair)
    ensures Momentum(Sweep(s, i, j, pair)) == Momentum(s)
    decreases j
  {
    if j > 0 {
      SweepConservesMomentum(s, i, j - 1, pair);
      PairAtConservesMomentum(Sweep(s, i, j - 1, pair), i, j - 1, pair);
    }
  }

  /** The collision pass of bubble i's turn in a frame conserves the momentum. */
  lemma CollisionsConserveMomentum(s: seq<Bubble>, i: nat, width: real, height: real, sqrt: real -> real)
    requires i < |s|
    ensures Momentum(Sweep(s, i, |s|, Physics(width, height, sqrt))) == Momentum(s)
  {
    PhysicsKeeps(width, height, sqrt);
    SweepConservesMomentum(s, i, |s|, Physics(width, height, sqrt));
  }

  // ---------------------------------------------------------------------
  // The animation step, in place
  // ---------------------------------------------------------------------

  /** The first part of bubble i's turn, in place: drift, then the four wall checks. */
  method Advance(bubbles: array<Bubble>, i: nat, width: real, height: real)
    requires i < bubbles.Length
    modifies bubbles
    ensures bubbles[..] == old(bubbles[..])[i := BounceWalls(Drift(old(bubbles[i])), width, height)]
  {
    var bubble := bubbles[i];
    // Update position.
    bubble := bubble.(x := bubble.x + bubble.vx, y := bubble.y + bubble.vy);
    // Bounce off walls.
    if bubble.x <= 0.0 {
      bubble := bubble.(x := 0.0, vx := Abs(bubble.vx));
    }
    if bubble.x + bubble.size >= width {
      bubble := bubble.(x := width - bubble.size, vx := -Abs(bubble.vx));
    }
    if bubble.y <= 0.0 {
      bubble := bubble.(y := 0.0, vy := Abs(bubble.vy));
    }
    if bubble.y + bubble.size >= height {
      bubble := bubble.(y := height - bubble.size, vy := -Abs(bubble.vy));
    }
    bubbles[i] := bubble;
  }

  /** Bubble i's visit to bubble j, in place: skipped when the ids are equal. */
  method Collide(bubbles: array<Bubble>, i: nat, j: nat, width: real, height: real, sqrt: real -> real)
    requires i < bubbles.Length && j < bubbles.Length
    modifies bubbles
    ensures bubbles[..] == PairAt(old(bubbles[..]), i, j, Physics(width, height, sqrt))
  {
    var bubble, other := bubbles[i], bubbles[j];
    if bubble.id != other.id {
      var after := PairStep(bubble, other, width, height, sqrt);
      bubbles[i] := after.0;
      bubbles[j] := after.1;
    }
  }

  /** The inner loop of bubble i's turn: its visit to every bubble, in order. */
  method CollideAll(bubbles: array<Bubble>, i: nat, width: real, height: real, sqrt: real -> real)
    requires i < bubbles.Length
    modifies bubbles
    ensures bubbles[..] == Sweep(old(bubbles[..]), i, bubbles.Length, Physics(width, height, sqrt))
  {
    ghost var moved := bubbles[..];
    for j := 0 to bubbles.Length
      invariant bubbles[..] == Sweep(moved, i, j, Physics(width, height, sqrt))
    {
      Collide(bubbles, i, j, width, height, sqrt);
    }
  }

  /**
    One animation frame, updating the bubbles in place. Each bubble in turn
    drifts and bounces off the walls, then visits every bubble, including
    those whose turn has not come yet in this frame, so each pair is
    visited twice, once from each side.
   */
  method Animate(bubbles: array<Bubble>, width: real, height: real, sqrt: real -> real)
    modifies bubbles
    ensures bubbles[..] == Frame(old(bubbles[..]), width, height, sqrt)
    ensures forall k :: 0 <= k < bubbles.Length ==> SameBody(bubbles[k], old(bubbles[k]))
    ensures (forall k :: 0 <= k < bubbles.Length ==> Fits(bubbles[k], width, height)) ==>
      forall k :: 0 <= k < bubbles.Length ==> InBounds(bubbles[k], width, height)
  {
    ghost var start := bubbles[..];
    var n := bubbles.Length;
    for i := 0 to n
      invariant bubbles[..] == FrameUpTo(start, i, width, height, Physics(width, height, sqrt))
    {
      Advance(bubbles, i, width, height);
      CollideAll(bubbles, i, width, height, sqrt);
    }
    PhysicsKeeps(width, height, sqrt);
    FrameUpToKeepsBodies(start, n, width, height, Physics(width, height, sqrt));
    if forall k :: 0 <= k < n ==> Fits(bubbles[k], width, height) {
      assert forall k :: 0 <= k < n ==> Fits(start[k], width, height);
      FrameInBounds(start, width, height, sqrt);
    }
  }
}
