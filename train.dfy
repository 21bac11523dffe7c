/** The arithmetic of `positionTrain`: the cars of the pipeline sit on one
    line, `spacing` pixels apart, shifted so that the active car is at the
    origin, drawn larger and on top of the others. */
module Train {

  /** `clientWidth || 900`: a container that reports no width counts as
      900 pixels wide. */
  function Width(clientWidth: nat): (w: nat)
    ensures w > 0
    ensures clientWidth > 0 ==> w == clientWidth
    ensures clientWidth == 0 ==> w == 900
  {
    if clientWidth == 0 then 900 else clientWidth
  }

  /** `Math.max(5, count + 1)`: the number of slots the width is shared by. */
  function Slots(count: nat): (n: nat)
    ensures n >= 5 && n >= count + 1
  {
    if count + 1 < 5 then 5 else count + 1
  }

  /** The horizontal distance between neighbouring cars: the container's
      width shared among the slots, rounded down and kept between 100 and
      160 pixels. */
  function Spacing(clientWidth: nat, count: nat): (spacing: int)
    ensures 100 <= spacing <= 160
  {
    var share := Width(clientWidth) / Slots(count);
    if share < 100 then 100 else if share > 160 then 160 else share
  }

  /** Where the width allows it, the slots fit in the container: only the
      100-pixel minimum can push the train past its container's edge. */
  lemma SpacingFits(clientWidth: nat, count: nat)
    requires 100 * Slots(count) <= Width(clientWidth)
    ensures Spacing(clientWidth, count) * Slots(count) <= Width(clientWidth)
  {
    var w := Width(clientWidth);
    var n := Slots(count);
    var share := w / n;
    QuotientBounds(w, n, 100);
    MulMonotone(Spacing(clientWidth, count), share, n);
  }

  lemma QuotientBounds(w: nat, n: nat, c: nat)
    requires n > 0 && c * n <= w
    ensures (w / n) * n <= w && c <= w / n
  {
    var q := w / n;
    assert w == q * n + w % n && w % n < n;
    assert c * n < (q + 1) * n;
    if q + 1 <= c {
      MulMonotone(q + 1, c, n);
    }
  }

  lemma MulMonotone(a: int, b: int, n: nat)
    requires a <= b
    ensures a * n <= b * n
  {
    assert b * n - a * n == (b - a) * n;
  }

  /** Where one car is drawn. */
  datatype Placement = Placement(tx: int, scale: real, z: int, status: string)

  /** The placement of car `idx` when car `active` is the current step:
      `completed` says whether the car carries the `completed` class. */
  function Place(idx: int, active: int, spacing: int, completed: bool): (p: Placement)
    ensures 10 <= p.z <= 50
    ensures p.scale == 1.12 <==> idx == active
    ensures p.status == "Processing..." <==> idx == active
  {
    var offset := idx - active;
    var isActive := idx == active;
    var distance := if offset < 0 then -offset else offset;
    Placement(
      offset * spacing,
      if isActive then 1.12 else 0.92,
      if isActive then 50 else if 40 - distance < 10 then 10 else 40 - distance,
      if isActive then "Processing..." else if completed then "Complete" else "Pending")
  }

  /** The active car, and only it, sits at the origin, drawn at 1.12 scale
      with z-index 50 and status `Processing...`; every other car is drawn at
      0.92 with a z-index between 10 and 40 and reads `Complete` or
      `Pending` by its class. */
  lemma PlaceActive(idx: int, active: int, spacing: int, completed: bool)
    requires spacing > 0
    ensures var p := Place(idx, active, spacing, completed);
      && (p.tx == 0 <==> idx == active)
      && (p.z == 50 <==> idx == active)
      && (idx != active ==> 10 <= p.z <= 40 && p.scale == 0.92)
      && (idx == active ==> p.scale == 1.12 && p.status == "Processing...")
      && (idx != active ==> p.status == if completed then "Complete" else "Pending")
  {
    var p := Place(idx, active, spacing, completed);
    if idx != active {
      assert (idx - active) * spacing != 0;
    }
  }

  /** Neighbouring cars are exactly `spacing` apart, so no two cars overlap
      and their order on screen is their order in the pipeline. */
  lemma PlaceSpaced(idx: int, active: int, spacing: int, c1: bool, c2: bool)
    ensures Place(idx + 1, active, spacing, c1).tx - Place(idx, active, spacing, c2).tx == spacing
  {
    assert (idx + 1 - active) * spacing == (idx - active) * spacing + spacing;
  }

  /** A car nearer the active one is drawn above a car farther from it. */
  lemma NearerIsHigher(i: int, j: int, active: int, spacing: int, c1: bool, c2: bool)
    requires (if i < active then active - i else i - active) <= (if j < active then active - j else j - active)
    ensures Place(i, active, spacing, c1).z >= Place(j, active, spacing, c2).z
  {
  }
}
