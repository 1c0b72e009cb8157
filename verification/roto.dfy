/** The data-model heart of the roto engine: Bezier control points, a Bezier's
    point / feather-point lists, item flags, drawable-item knob defaults and the
    roto context with its cache-invalidation age counter.

    A control point's position at a time comes from animation curves that are
    not part of this model; every query that needs it takes the evaluation as a
    parameter `pos`. A point's keyframe times are an abstract set. */
module Roto {
  import opened Common

  /** 2^64: `age` is an unsigned 64-bit counter. */
  const U64_MODULUS: nat := 0x1_0000_0000_0000_0000

  type U64 = n: nat | n < U64_MODULUS

  datatype Point = Point(x: real, y: real)

  /** Handle of the Double track a control point may be slaved to. */
  type TrackId = nat

  /** A Bezier vertex: the values used when a curve carries no keyframe,
      the keyframe times of its position curve and an optional master track. */
  datatype ControlPoint = ControlPoint(
    x: real, y: real,
    leftX: real, rightX: real, leftY: real, rightY: real,
    keyTimes: set<int>,
    masterTrack: Option<TrackId>)

  /** Evaluation of a control point's position at a frame (curves are not modelled). */
  type PositionAt = (ControlPoint, int) -> Point

  /** `finished` closes the curve: the last point connects back to the first. */
  datatype Bezier = Bezier(points: seq<ControlPoint>, featherPoints: seq<ControlPoint>, finished: bool)

  /** The documented invariant: one feather point per control point. */
  predicate ValidBezier(b: Bezier) {
    |b.featherPoints| == |b.points|
  }

  datatype RotoError = OutOfRange

  // ---------------------------------------------------------------- defaults

  function NewControlPoint(): (cp: ControlPoint)
    ensures cp.x == 0.0 && cp.y == 0.0
    ensures cp.leftX == 0.0 && cp.rightX == 0.0 && cp.leftY == 0.0 && cp.rightY == 0.0
    ensures cp.masterTrack.None? && cp.keyTimes == {}
  {
    ControlPoint(0.0, 0.0, 0.0, 0.0, 0.0, 0.0, {}, None)
  }

  function NewBezier(): (b: Bezier)
    ensures ValidBezier(b)
    ensures b.points == [] && b.featherPoints == [] && !b.finished
  {
    Bezier([], [], false)
  }

  /** Flags of every roto item (layer or shape). */
  datatype RotoItem = RotoItem(name: string, parentLayer: Option<string>, globallyActivated: bool, locked: bool)

  function NewRotoItem(name: string, parent: Option<string>): (it: RotoItem)
    ensures it.name == name && it.parentLayer == parent
    ensures it.globallyActivated && !it.locked
  {
    RotoItem(name, parent, true, false)
  }

  /** Initial knob values of a drawable item (shape). */
  datatype DrawableItem = DrawableItem(
    opacity: real, feather: int, featherFallOff: real,
    activated: bool, inverted: bool,
    overlayColor: seq<real>)

  function NewDrawableItem(): (d: DrawableItem)
    ensures d.opacity == 1.0 && d.feather == 0 && d.featherFallOff == 1.0
    ensures d.activated && !d.inverted
    ensures |d.overlayColor| == 4 && d.overlayColor[3] == 1.0
  {
    DrawableItem(1.0, 0, 1.0, true, false, [0.85164, 0.196936, 0.196936, 1.0])
  }

  /** A numeric knob of the context: bounds, display bounds, default value and
      whether it is enabled and saved with the project. */
  datatype NumericKnob = NumericKnob(
    name: string, integral: bool,
    min: real, max: real, displayMin: real, displayMax: real,
    default: real, enabled: bool, persistent: bool)

  datatype BoolKnob = BoolKnob(name: string, default: bool, enabled: bool, persistent: bool)

  predicate DefaultInRange(k: NumericKnob) {
    k.min <= k.default <= k.max && k.displayMin <= k.default <= k.displayMax
  }

  datatype RotoContext = RotoContext(
    layers: seq<string>,
    autoKeying: bool, rippleEdit: bool, featherLink: bool,
    age: U64,
    opacity: NumericKnob, feather: NumericKnob, featherFallOff: NumericKnob,
    activated: BoolKnob, inverted: BoolKnob,
    itemCounters: map<string, int>,
    selectedItems: seq<string>)

  /** The context knobs mirror the selected shapes and are neither enabled nor saved. */
  function NewRotoContext(): (c: RotoContext)
    ensures c.autoKeying && !c.rippleEdit && c.featherLink && c.age == 0
    ensures c.layers == [] && c.selectedItems == [] && c.itemCounters == map[]
    ensures c.opacity.min == 0.0 && c.opacity.max == 1.0 && c.opacity.default == 1.0
    ensures c.feather.integral && c.feather.min == -100.0 && c.feather.max == 100.0 && c.feather.default == 0.0
    ensures c.featherFallOff.min == 0.2 && c.featherFallOff.max == 5.0 && c.featherFallOff.default == 1.0
    ensures c.activated.default && !c.inverted.default
    ensures !c.opacity.persistent && !c.feather.persistent && !c.featherFallOff.persistent
    ensures !c.activated.persistent && !c.inverted.persistent
    ensures !c.opacity.enabled && !c.feather.enabled && !c.featherFallOff.enabled
    ensures !c.activated.enabled && !c.inverted.enabled
  {
    RotoContext(
      [], true, false, true, 0,
      NumericKnob("Opacity", false, 0.0, 1.0, 0.0, 1.0, 1.0, false, false),
      NumericKnob("Feather", true, -100.0, 100.0, -100.0, 100.0, 0.0, false, false),
      NumericKnob("Feather fall-off", false, 0.2, 5.0, 0.2, 5.0, 1.0, false, false),
      BoolKnob("Activated", true, false, false),
      BoolKnob("Inverted", false, false, false),
      map[], [])
  }

  /** Every context knob starts at a value inside its own bounds, and a fresh
      shape's knob values are legal values of the context knobs that mirror it. */
  lemma ContextDefaultsConsistent()
    ensures DefaultInRange(NewRotoContext().opacity)
    ensures DefaultInRange(NewRotoContext().feather)
    ensures DefaultInRange(NewRotoContext().featherFallOff)
    ensures var c, d := NewRotoContext(), NewDrawableItem();
      && c.opacity.min <= d.opacity <= c.opacity.max
      && c.feather.min <= d.feather as real <= c.feather.max
      && c.featherFallOff.min <= d.featherFallOff <= c.featherFallOff.max
      && c.activated.default == d.activated
      && c.inverted.default == d.inverted
  {
  }

  // ---------------------------------------------------------------- age

  /** Marks the cached mask stale: `age` advances by one in unsigned 64-bit
      arithmetic and nothing else changes. */
  function IncrementRotoAge(c: RotoContext): (r: RotoContext)
    ensures r.age == (c.age + 1) % U64_MODULUS
    ensures r.age != c.age
    ensures r == c.(age := r.age)
  {
    c.(age := if c.age == U64_MODULUS - 1 then 0 else c.age + 1)
  }

  function IncrementRotoAgeTimes(c: RotoContext, n: nat): RotoContext
  {
    if n == 0 then c else IncrementRotoAge(IncrementRotoAgeTimes(c, n - 1))
  }

  /** n consecutive increments advance the age by n modulo 2^64; from a fresh
      context the age counts the increments exactly until it wraps. */
  lemma {:induction false} IncrementRotoAgeCounts(c: RotoContext, n: nat)
    ensures IncrementRotoAgeTimes(c, n).age == (c.age + n) % U64_MODULUS
    ensures IncrementRotoAgeTimes(c, n) == c.(age := IncrementRotoAgeTimes(c, n).age)
  {
    if n > 0 {
      IncrementRotoAgeCounts(c, n - 1);
      var prev := IncrementRotoAgeTimes(c, n - 1);
      assert prev.age == (c.age + (n - 1)) % U64_MODULUS;
      ModSucc(c.age + (n - 1));
    }
  }

  lemma ModSucc(a: nat)
    ensures (a % 0x1_0000_0000_0000_0000 + 1) % 0x1_0000_0000_0000_0000 == (a + 1) % 0x1_0000_0000_0000_0000
  {
  }

  // ---------------------------------------------------------------- queries

  /** std::advance over the control-point list, with the range check that
      throws std::out_of_range. */
  function AtIndex(b: Bezier, index: int): (r: Result<ControlPoint, RotoError>)
    ensures r.Err? <==> index < 0 || index >= |b.points|
    ensures r.Ok? ==> r.value == b.points[index]
  {
    if index >= |b.points| || index < 0 then Err(OutOfRange)
    else Ok(Advance(b.points, index))
  }

  /** Walks `steps` links from the head of the list. */
  function Advance(s: seq<ControlPoint>, steps: nat): (r: ControlPoint)
    requires steps < |s|
    ensures r == s[steps]
  {
    if steps == 0 then s[0] else Advance(s[1..], steps - 1)
  }

  /** The closed acceptance box [x-acc, x+acc] x [y-acc, y+acc]. */
  predicate InBox(p: Point, x: real, y: real, acceptance: real) {
    x - acceptance <= p.x <= x + acceptance && y - acceptance <= p.y <= y + acceptance
  }

  /** Index of the first point of `s` whose position at `time` lies in the box
      (the reference definition the scans below are checked against). */
  ghost predicate IsFirstNearby(s: seq<ControlPoint>, i: int, pos: PositionAt,
                                x: real, y: real, acceptance: real, time: int) {
    && 0 <= i < |s|
    && InBox(pos(s[i], time), x, y, acceptance)
    && forall j :: 0 <= j < i ==> !InBox(pos(s[j], time), x, y, acceptance)
  }

  ghost predicate NoneNearby(s: seq<ControlPoint>, pos: PositionAt,
                             x: real, y: real, acceptance: real, time: int) {
    forall j :: 0 <= j < |s| ==> !InBox(pos(s[j], time), x, y, acceptance)
  }

  /** The shared linear scan. `indexIn` is the caller's out-variable, written
      only on a match. */
  method ScanNearby(s: seq<ControlPoint>, pos: PositionAt, x: real, y: real,
                    acceptance: real, time: int, indexIn: int)
    returns (found: Option<ControlPoint>, index: int)
    ensures found.Some? ==> IsFirstNearby(s, index, pos, x, y, acceptance, time) && found.value == s[index]
    ensures found.None? ==> NoneNearby(s, pos, x, y, acceptance, time) && index == indexIn
  {
    var i := 0;
    while i < |s|
      invariant 0 <= i <= |s|
      invariant NoneNearby(s[..i], pos, x, y, acceptance, time)
    {
      var p := pos(s[i], time);
      if p.x >= x - acceptance && p.x <= x + acceptance && p.y >= y - acceptance && p.y <= y + acceptance {
        assert forall j :: 0 <= j < i ==> s[..i][j] == s[j];
        return Some(s[i]), i;
      }
      assert s[..i + 1] == s[..i] + [s[i]];
      i := i + 1;
    }
    assert s[..i] == s;
    return None, indexIn;
  }

  /** First control point, in list order, whose position at `time` lies in the box. */
  method FindControlPointNearby(b: Bezier, pos: PositionAt, x: real, y: real,
                                acceptance: real, time: int, indexIn: int)
    returns (found: Option<ControlPoint>, index: int)
    ensures found.Some? ==> IsFirstNearby(b.points, index, pos, x, y, acceptance, time) && found.value == b.points[index]
    ensures found.None? ==> NoneNearby(b.points, pos, x, y, acceptance, time) && index == indexIn
  {
    found, index := ScanNearby(b.points, pos, x, y, acceptance, time, indexIn);
  }

  /** Same first-match rule over the feather points only. */
  method FindFeatherPointNearby(b: Bezier, pos: PositionAt, x: real, y: real,
                                acceptance: real, time: int, indexIn: int)
    returns (found: Option<ControlPoint>, index: int)
    ensures found.Some? ==> IsFirstNearby(b.featherPoints, index, pos, x, y, acceptance, time) && found.value == b.featherPoints[index]
    ensures found.None? ==> NoneNearby(b.featherPoints, pos, x, y, acceptance, time) && index == indexIn
  {
    found, index := ScanNearby(b.featherPoints, pos, x, y, acceptance, time, indexIn);
  }

  /** The first-match index is unique: whatever scan produced it, it is the
      smallest matching index, and it is a valid index for `AtIndex`. */
  lemma FirstNearbyUnique(s: seq<ControlPoint>, i: int, k: int, pos: PositionAt,
                          x: real, y: real, acceptance: real, time: int)
    requires IsFirstNearby(s, i, pos, x, y, acceptance, time)
    requires IsFirstNearby(s, k, pos, x, y, acceptance, time)
    ensures i == k
  {
  }

  lemma NearbyIndexIsAtIndex(b: Bezier, i: int, pos: PositionAt,
                             x: real, y: real, acceptance: real, time: int)
    requires IsFirstNearby(b.points, i, pos, x, y, acceptance, time)
    ensures AtIndex(b, i) == Ok(b.points[i])
  {
  }

  /** A Bezier keyframes where its first control point does; none without points. */
  function HasKeyframeAtTime(b: Bezier, time: int): (r: bool)
    ensures |b.points| == 0 ==> !r
    ensures |b.points| > 0 ==> (r <==> time in b.points[0].keyTimes)
  {
    if |b.points| == 0 then false else time in b.points[0].keyTimes
  }

  /** Inserts the first control point's keyframe times into `times`. */
  function GetKeyframeTimes(b: Bezier, times: set<int>): (r: set<int>)
    ensures times <= r
    ensures |b.points| == 0 ==> r == times
    ensures |b.points| > 0 ==> r - times == b.points[0].keyTimes - times
  {
    if |b.points| == 0 then times else times + b.points[0].keyTimes
  }

  /** The two keyframe queries agree: a time is a keyframe of the Bezier iff it
      is among the collected keyframe times. */
  lemma KeyframeQueriesAgree(b: Bezier, time: int)
    ensures HasKeyframeAtTime(b, time) <==> time in GetKeyframeTimes(b, {})
  {
  }
}
